/** Sending log entries to a follower: splitting an oversized request, retrying with fewer
    entries, and what the follower makes of it. The follower follows the AppendEntries receiver
    rules of section 5.3 of "In Search of an Understandable Consensus Algorithm". */
module Replication {
  import opened KvTypes
  import opened Wrappers

  datatype LogId = LogId(leader: nat, index: nat)

  datatype LogEntry = LogEntry(id: LogId, payload: Bytes)

  /** The position after a log id; nothing precedes position zero. */
  function NextIndex(id: Option<LogId>): nat { match id case Some(x) => x.index + 1 case None => 0 }

  datatype AppendRequest = AppendRequest(
    vote: nat, prev: Option<LogId>, entries: seq<LogEntry>, leaderCommit: Option<LogId>)
  {
    /** Entries are consecutive and follow `prev`. */
    predicate Consecutive() {
      forall i :: 0 <= i < |entries| ==> entries[i].id.index == NextIndex(prev) + i
    }

    /** The id before entry `n`. */
    function IdBefore(n: nat): Option<LogId>
      requires n <= |entries|
    {
      if n == 0 then prev else Some(entries[n - 1].id)
    }

    /** `build_partial_append_request`: the first `n` entries. */
    function Partial(n: nat): AppendRequest
      requires n <= |entries|
    {
      this.(entries := entries[..n])
    }

    /** What remains to be sent after the first `n` entries. */
    function Remainder(n: nat): AppendRequest
      requires n <= |entries|
    {
      this.(prev := IdBefore(n), entries := entries[n..])
    }

    /** The request for entry `i` alone, chained to the entry before it. */
    function Chunk(i: nat): AppendRequest
      requires i < |entries|
    {
      this.(prev := IdBefore(i), entries := [entries[i]])
    }
  }

  /** One request if it is small enough or carries no entries, otherwise one per entry. */
  function SplitAppendRequest(req: AppendRequest, encodedLen: nat, advisoryMessageSize: nat): seq<AppendRequest> {
    if req.entries == [] || encodedLen <= advisoryMessageSize then [req] else Chunks(req, |req.entries|)
  }

  function Chunks(req: AppendRequest, n: nat): (cs: seq<AppendRequest>)
    requires n <= |req.entries|
    ensures |cs| == n && forall i :: 0 <= i < n ==> cs[i] == req.Chunk(i)
  {
    seq(n, i requires 0 <= i < n => req.Chunk(i))
  }

  // ------------------------------------------------------------- follower

  datatype Follower = Follower(vote: nat, log: seq<LogEntry>, committed: nat)

  datatype AppendReply = Success | Conflict | HigherVote

  datatype Received = Received(f: Follower, reply: AppendReply)

  predicate Contains(log: seq<LogEntry>, id: Option<LogId>) {
    id.Some? ==> id.value.index < |log| && log[id.value.index].id == id.value
  }

  /** Keep entries that are already there; from the first that differs, replace the rest. */
  function Merge(log: seq<LogEntry>, at: nat, entries: seq<LogEntry>): (r: seq<LogEntry>)
    requires at <= |log|
    ensures |r| >= at + |entries| && r[..at] == log[..at]
    decreases |entries|
  {
    if entries == [] then log
    else
      var kept := if at < |log| && log[at].id == entries[0].id then log else log[..at] + [entries[0]];
      var r := Merge(kept, at + 1, entries[1..]);
      assert r[..at] == r[..at + 1][..at] && kept[..at + 1][..at] == log[..at];
      r
  }

  function Max(a: nat, b: nat): nat { if a < b then b else a }

  function Min(a: nat, b: nat): nat { if a < b then a else b }

  function Receive(f: Follower, req: AppendRequest): Received {
    if req.vote < f.vote then Received(f, HigherVote)
    else if !Contains(f.log, req.prev) then Received(f.(vote := req.vote), Conflict)
    else
      var at := NextIndex(req.prev);
      Received(Follower(req.vote,
                        Merge(f.log, at, req.entries),
                        Max(f.committed, Min(NextIndex(req.leaderCommit), at + |req.entries|))),
               Success)
  }

  /** Deliver requests one after another, going on after a rejection. */
  function Deliver(f: Follower, reqs: seq<AppendRequest>): (r: (Follower, seq<AppendReply>))
    ensures |r.1| == |reqs|
    decreases |reqs|
  {
    if reqs == [] then (f, [])
    else
      var (g, replies) := Deliver(f, reqs[..|reqs| - 1]);
      var last := Receive(g, reqs[|reqs| - 1]);
      (last.f, replies + [last.reply])
  }

  // --------------------------------------------------------------- merging

  /** After merging, the log holds the entries sent at their positions. */
  lemma {:induction false} MergeContains(log: seq<LogEntry>, at: nat, entries: seq<LogEntry>, i: nat)
    requires at <= |log| && i < |entries|
    ensures Merge(log, at, entries)[at + i].id == entries[i].id
    decreases |entries|
  {
    var log' := if at < |log| && log[at].id == entries[0].id then log else log[..at] + [entries[0]];
    if i > 0 {
      MergeContains(log', at + 1, entries[1..], i - 1);
    } else {
      var r := Merge(log', at + 1, entries[1..]);
      assert r[at] == r[..at + 1][at] == log'[..at + 1][at];
    }
  }

  lemma {:induction false} MergeConcat(log: seq<LogEntry>, at: nat, a: seq<LogEntry>, b: seq<LogEntry>)
    requires at <= |log|
    ensures Merge(log, at, a + b) == Merge(Merge(log, at, a), at + |a|, b)
    decreases |a|
  {
    if a == [] {
      assert a + b == b;
    } else {
      assert (a + b)[0] == a[0] && (a + b)[1..] == a[1..] + b;
      var log' := if at < |log| && log[at].id == a[0].id then log else log[..at] + [a[0]];
      MergeConcat(log', at + 1, a[1..], b);
    }
  }

  lemma {:induction false} MergeAppends(log: seq<LogEntry>, entries: seq<LogEntry>)
    ensures Merge(log, |log|, entries) == log + entries
    decreases |entries|
  {
    if entries != [] {
      assert log[..|log|] == log;
      MergeAppends(log + [entries[0]], entries[1..]);
      assert log + [entries[0]] + entries[1..] == log + entries;
    }
  }

  /** A request whose entries are all there changes nothing; otherwise the log is cut at the first
      difference and continues as sent. */
  lemma {:induction false} MergeMeaning(log: seq<LogEntry>, at: nat, entries: seq<LogEntry>, k: nat)
    requires at <= |log| && k <= |entries| && at + k <= |log|
    requires forall i :: 0 <= i < k ==> log[at + i].id == entries[i].id
    requires k < |entries| && at + k < |log| ==> log[at + k].id != entries[k].id
    ensures Merge(log, at, entries) == if k == |entries| then log else log[..at + k] + entries[k..]
    decreases |entries|
  {
    if entries != [] {
      MergeFirst(log, at, entries);
      if k > 0 {
        assert log[at + 0].id == entries[0].id;
        forall i | 0 <= i < k - 1 ensures log[at + 1 + i].id == entries[1..][i].id {
          assert log[at + (i + 1)].id == entries[i + 1].id;
        }
        MergeMeaning(log, at + 1, entries[1..], k - 1);
        assert entries[1..][k - 1..] == entries[k..];
      } else {
        MergeAppends(log[..at] + [entries[0]], entries[1..]);
        assert log[..at] + [entries[0]] + entries[1..] == log[..at] + entries[0..];
      }
    }
  }

  lemma MergeFirst(log: seq<LogEntry>, at: nat, entries: seq<LogEntry>)
    requires at <= |log| && entries != []
    ensures Merge(log, at, entries) ==
      if at < |log| && log[at].id == entries[0].id then Merge(log, at + 1, entries[1..])
      else Merge(log[..at] + [entries[0]], at + 1, entries[1..])
  {
  }

  /** The entries are all in the log, at their places. */
  predicate AllThere(log: seq<LogEntry>, at: nat, entries: seq<LogEntry>) {
    at + |entries| <= |log| && forall i :: 0 <= i < |entries| ==> log[at + i].id == entries[i].id
  }

  lemma {:induction false} MergeLength(log: seq<LogEntry>, at: nat, entries: seq<LogEntry>)
    requires at <= |log|
    ensures if AllThere(log, at, entries) then Merge(log, at, entries) == log
            else |Merge(log, at, entries)| == at + |entries|
    decreases |entries|
  {
    if entries != [] {
      MergeFirst(log, at, entries);
      assert AllThere(log, at, entries) ==> at < |log| && log[at + 0].id == entries[0].id;
      if at < |log| && log[at].id == entries[0].id {
        MergeLength(log, at + 1, entries[1..]);
        ThereFromSecond(log, at, entries);
      } else {
        MergeAppends(log[..at] + [entries[0]], entries[1..]);
      }
    }
  }

  lemma ThereFromSecond(log: seq<LogEntry>, at: nat, entries: seq<LogEntry>)
    requires entries != [] && at < |log| && log[at].id == entries[0].id
    ensures AllThere(log, at, entries) <==> AllThere(log, at + 1, entries[1..])
  {
    if AllThere(log, at, entries) {
      forall i | 0 <= i < |entries[1..]| ensures log[at + 1 + i].id == entries[1..][i].id {
        assert log[at + (i + 1)].id == entries[i + 1].id;
      }
    }
    if AllThere(log, at + 1, entries[1..]) {
      forall i | 0 <= i < |entries| ensures log[at + i].id == entries[i].id {
        assert i > 0 ==> log[at + 1 + (i - 1)].id == entries[1..][i - 1].id;
      }
    }
  }

  /** The follower's rules: it refuses a lower vote, and a request whose `prev` it does not hold. It
      accepts any other: what precedes the entries stays, the entries are there, what follows them is
      dropped only if one of them was missing, and the commit position is raised to the leader's, but
      not beyond the entries, and never lowered. */
  lemma ReceiveMeaning(f: Follower, req: AppendRequest)
    ensures var r := Receive(f, req);
      var held := req.prev.Some? ==>
        req.prev.value.index < |f.log| && f.log[req.prev.value.index].id == req.prev.value;
      && (req.vote < f.vote ==> r == Received(f, HigherVote))
      && (req.vote >= f.vote && !held ==> r == Received(f.(vote := req.vote), Conflict))
      && (req.vote >= f.vote && held ==>
            var at := if req.prev.Some? then req.prev.value.index + 1 else 0;
            var there := AllThere(f.log, at, req.entries);
            var last := at + |req.entries|;
            var commit := if req.leaderCommit.Some? then req.leaderCommit.value.index + 1 else 0;
            && r.reply == Success && r.f.vote == req.vote
            && at <= |f.log| && last <= |r.f.log| && r.f.log[..at] == f.log[..at]
            && (forall i :: 0 <= i < |req.entries| ==> r.f.log[at + i].id == req.entries[i].id)
            && (if there then r.f.log == f.log else |r.f.log| == last)
            && r.f.committed >= f.committed
            && r.f.committed in {f.committed, commit, last}
            && (r.f.committed > f.committed ==> r.f.committed <= commit && r.f.committed <= last)
            && (commit <= last ==> commit <= r.f.committed) && (last <= commit ==> last <= r.f.committed))
  {
    if Receive(f, req).reply == Success {
      var at := NextIndex(req.prev);
      MergeLength(f.log, at, req.entries);
      forall i | 0 <= i < |req.entries|
        ensures Merge(f.log, at, req.entries)[at + i].id == req.entries[i].id
      {
        MergeContains(f.log, at, req.entries, i);
      }
    }
  }

  // ------------------------------------------------------------- splitting

  /** Sending a request in two parts gets the same answer to the first part and has the effect of
      sending it whole, unless the follower lacks `prev` but holds the entry the rest is chained to. */
  lemma TwoParts(f: Follower, req: AppendRequest, n: nat)
    requires req.Consecutive() && n <= |req.entries|
    ensures var first, whole := Receive(f, req.Partial(n)), Receive(f, req);
      && first.reply == whole.reply
      && (Receive(first.f, req.Remainder(n)) == whole <==>
          !(whole.reply == Conflict && Contains(f.log, req.IdBefore(n))))
  {
    if Receive(f, req).reply == Success { AcceptedInTwoParts(f, req, n); }
  }

  lemma AcceptedInTwoParts(f: Follower, req: AppendRequest, n: nat)
    requires req.Consecutive() && n <= |req.entries|
    requires Receive(f, req).reply == Success
    ensures Receive(Receive(f, req.Partial(n)).f, req.Remainder(n)) == Receive(f, req)
  {
    SentPartIsThere(f.log, req, n);
    RestAfterPart(f, req, n);
    assert req.entries[..|req.entries|] == req.entries;
    assert Receive(f, req) == Received(AfterPart(f, req, |req.entries|), Success);
  }

  /** What a follower becomes that accepts a request shortened to its first `n` entries. */
  function AfterPart(f: Follower, req: AppendRequest, n: nat): Follower
    requires n <= |req.entries| && NextIndex(req.prev) <= |f.log|
  {
    var at := NextIndex(req.prev);
    Follower(req.vote, Merge(f.log, at, req.entries[..n]), Max(f.committed, Min(NextIndex(req.leaderCommit), at + n)))
  }

  lemma RestAfterPart(f: Follower, req: AppendRequest, n: nat)
    requires n <= |req.entries| && NextIndex(req.prev) <= |f.log|
    requires NextIndex(req.IdBefore(n)) == NextIndex(req.prev) + n
    requires Contains(AfterPart(f, req, n).log, req.IdBefore(n))
    ensures Receive(AfterPart(f, req, n), req.Remainder(n)) == Received(AfterPart(f, req, |req.entries|), Success)
  {
    var at, rest := NextIndex(req.prev), req.Remainder(n);
    var g, whole := AfterPart(f, req, n), AfterPart(f, req, |req.entries|);
    var r := Receive(g, rest);
    assert r.reply == Success && r.f.vote == whole.vote;
    assert r.f.log == Merge(g.log, at + n, req.entries[n..]) == whole.log by {
      MergeInParts(f.log, at, req.entries, n);
    }
    assert r.f.committed == whole.committed by {
      assert at + n + |rest.entries| == at + |req.entries|;
      CommittedInParts(f.committed, NextIndex(req.leaderCommit), at + n, at + |req.entries|);
    }
  }

  lemma {:induction false} MergeInParts(log: seq<LogEntry>, at: nat, entries: seq<LogEntry>, n: nat)
    requires at <= |log| && n <= |entries|
    ensures Merge(Merge(log, at, entries[..n]), at + n, entries[n..]) == Merge(log, at, entries[..|entries|])
  {
    MergeConcat(log, at, entries[..n], entries[n..]);
    assert entries[..|entries|] == entries[..n] + entries[n..];
  }

  /** Commit positions are raised to the same place whether or not a part is acknowledged first. */
  lemma CommittedInParts(committed: nat, leader: nat, part: nat, all: nat)
    requires part <= all
    ensures Max(Max(committed, Min(leader, part)), Min(leader, all)) == Max(committed, Min(leader, all))
  {
  }

  /** The id that the rest is chained to is in the log once the first part is merged. */
  lemma {:induction false} SentPartIsThere(log: seq<LogEntry>, req: AppendRequest, n: nat)
    requires req.Consecutive() && n <= |req.entries| && Contains(log, req.prev)
    ensures Contains(Merge(log, NextIndex(req.prev), req.entries[..n]), req.IdBefore(n))
    ensures NextIndex(req.IdBefore(n)) == NextIndex(req.prev) + n
  {
    if n > 0 {
      MergeContains(log, NextIndex(req.prev), req.entries[..n], n - 1);
    } else {
      assert req.entries[..0] == [];
    }
  }

  lemma {:induction false} AcceptedChunks(f: Follower, req: AppendRequest, n: nat)
    requires req.Consecutive() && 0 < n <= |req.entries|
    requires Receive(f, req).reply == Success
    ensures var (g, replies) := Deliver(f, Chunks(req, n));
      g == Receive(f, req.Partial(n)).f && forall i :: 0 <= i < n ==> replies[i] == Success
    decreases n
  {
    var cs := Chunks(req, n);
    var p := req.Partial(n);
    assert cs[..n - 1] == Chunks(req, n - 1);
    if n == 1 {
      assert req.Chunk(0) == p;
    } else {
      AcceptedChunks(f, req, n - 1);
      AcceptedInTwoParts(f, p, n - 1);
      assert p.Partial(n - 1) == req.Partial(n - 1);
      assert p.Remainder(n - 1) == req.Chunk(n - 1);
    }
  }

  /** After any number of single-entry requests the follower and its answers are those of the
      request shortened to these entries, with the one exception `SplitDelivery` names. */
  lemma {:induction false} ChunksPrefix(f: Follower, req: AppendRequest, n: nat)
    requires req.Consecutive() && 0 < n <= |req.entries|
    ensures var short := Receive(f, req.Partial(n));
      var (g, replies) := Deliver(f, Chunks(req, n));
      (g == short.f && forall i :: 0 <= i < n ==> replies[i] == short.reply)
      <==> short.reply != Conflict || HoldsNone(f.log, req, n - 1)
  {
    var p := req.Partial(n);
    assert Chunks(p, n) == Chunks(req, n);
    assert HoldsNone(f.log, p, n - 1) == HoldsNone(f.log, req, n - 1) by {
      assert forall i :: 0 <= i < n - 1 ==> p.entries[i] == req.entries[i];
    }
    ChunkDelivery(f, p);
  }

  /** The log holds none of the first `n` entries. */
  predicate HoldsNone(log: seq<LogEntry>, req: AppendRequest, n: nat)
    requires n <= |req.entries|
  {
    forall i :: 0 <= i < n ==> !Contains(log, Some(req.entries[i].id))
  }

  /** A request with entries that is larger than advised is sent as one request per entry, each with
      that entry alone, chained to the one before it, with the same vote and commit; any other is sent
      as it is. */
  lemma SplitExact(req: AppendRequest, encodedLen: nat, advisoryMessageSize: nat)
    ensures var parts := SplitAppendRequest(req, encodedLen, advisoryMessageSize);
      if req.entries != [] && encodedLen > advisoryMessageSize then
        && |parts| == |req.entries|
        && forall i :: 0 <= i < |parts| ==>
             var prev := if i == 0 then req.prev else Some(req.entries[i - 1].id);
             parts[i] == AppendRequest(req.vote, prev, [req.entries[i]], req.leaderCommit)
      else parts == [req]
  {
  }

  /** Whatever the sizes, delivering what a request is split into gives the same replies, log and
      commit bound as the request itself, if that is accepted or the follower votes higher. If the
      follower lacks `prev` it does so exactly when the request is sent whole or the follower holds
      none of the entries that later chunks are chained to. */
  lemma {:induction false} SplitDelivery(f: Follower, req: AppendRequest, encodedLen: nat, advisoryMessageSize: nat)
    requires req.Consecutive()
    ensures var parts, whole := SplitAppendRequest(req, encodedLen, advisoryMessageSize), Receive(f, req);
      var (g, replies) := Deliver(f, parts);
      var same := g == whole.f && forall i :: 0 <= i < |replies| ==> replies[i] == whole.reply;
      && parts != []
      && (whole.reply != Conflict ==> same)
      && (whole.reply == Conflict ==>
            (same <==> |parts| == 1 || HoldsNone(f.log, req, |req.entries| - 1)))
  {
    var parts := SplitAppendRequest(req, encodedLen, advisoryMessageSize);
    if parts == [req] {
      assert Deliver(f, parts[..0]) == (f, []);
    } else {
      ChunkDelivery(f, req);
    }
  }

  lemma {:induction false} ChunkDelivery(f: Follower, req: AppendRequest)
    requires req.Consecutive() && req.entries != []
    ensures var whole := Receive(f, req);
      var (g, replies) := Deliver(f, Chunks(req, |req.entries|));
      var same := g == whole.f && forall i :: 0 <= i < |replies| ==> replies[i] == whole.reply;
      && (whole.reply != Conflict ==> same)
      && (whole.reply == Conflict ==>
            (same <==> HoldsNone(f.log, req, |req.entries| - 1)))
  {
    var n := |req.entries|;
    var whole := Receive(f, req);
    match whole.reply
    case Success =>
      AcceptedChunks(f, req, n);
      assert req.Partial(n) == req;
    case HigherVote =>
      HigherVoteChunks(f, req, n);
    case Conflict =>
      if HoldsNone(f.log, req, n - 1) {
        ConflictChunks(f, req, n);
      } else {
        var i :| 0 <= i < n - 1 && Contains(f.log, Some(req.entries[i].id));
        SomeChunkAccepted(f, req, n, i);
      }
  }

  lemma {:induction false} HigherVoteChunks(f: Follower, req: AppendRequest, n: nat)
    requires n <= |req.entries| && req.vote < f.vote
    ensures var (g, replies) := Deliver(f, Chunks(req, n));
      g == f && forall i :: 0 <= i < n ==> replies[i] == HigherVote
  {
    if n > 0 {
      assert Chunks(req, n)[..n - 1] == Chunks(req, n - 1);
      HigherVoteChunks(f, req, n - 1);
    }
  }

  lemma {:induction false} ConflictChunks(f: Follower, req: AppendRequest, n: nat)
    requires n <= |req.entries| && req.vote >= f.vote && !Contains(f.log, req.prev)
    requires forall i :: 0 <= i < n - 1 ==> !Contains(f.log, Some(req.entries[i].id))
    ensures var (g, replies) := Deliver(f, Chunks(req, n));
      && g == (if n == 0 then f else f.(vote := req.vote))
      && forall i :: 0 <= i < n ==> replies[i] == Conflict
  {
    if n > 0 {
      assert Chunks(req, n)[..n - 1] == Chunks(req, n - 1);
      ConflictChunks(f, req, n - 1);
    }
  }

  /** If every chunk before number `i + 1` conflicts, the log is untouched and that one is accepted. */
  lemma {:induction false} SomeChunkAccepted(f: Follower, req: AppendRequest, n: nat, i: nat)
    requires n <= |req.entries| && req.vote >= f.vote && i + 1 < n
    requires Contains(f.log, Some(req.entries[i].id))
    ensures exists j :: 0 <= j < n && Deliver(f, Chunks(req, n)).1[j] != Conflict
  {
    var m := i + 2;
    var replies := Deliver(f, Chunks(req, n)).1;
    RepliesPrefix(f, req, m, n);
    assert Chunks(req, m)[..m - 1] == Chunks(req, m - 1);
    if forall j :: 0 <= j < m - 1 ==> replies[j] == Conflict {
      RepliesPrefix(f, req, m - 1, n);
      AllConflictKeepsLog(f, req, m - 1);
      assert Receive(Deliver(f, Chunks(req, m - 1)).0, req.Chunk(m - 1)).reply == Success;
      assert Deliver(f, Chunks(req, m)).1[m - 1] == Success;
      assert replies[m - 1] != Conflict;
    }
  }

  lemma {:induction false} RepliesPrefix(f: Follower, req: AppendRequest, m: nat, n: nat)
    requires m <= n <= |req.entries|
    ensures Deliver(f, Chunks(req, n)).1[..m] == Deliver(f, Chunks(req, m)).1
    decreases n
  {
    if m < n {
      assert Chunks(req, n)[..n - 1] == Chunks(req, n - 1);
      RepliesPrefix(f, req, m, n - 1);
    }
  }

  lemma {:induction false} AllConflictKeepsLog(f: Follower, req: AppendRequest, n: nat)
    requires n <= |req.entries| && req.vote >= f.vote
    requires forall j :: 0 <= j < n ==> Deliver(f, Chunks(req, n)).1[j] == Conflict
    ensures var g := Deliver(f, Chunks(req, n)).0; g.log == f.log && req.vote >= g.vote
  {
    if n > 0 {
      assert Chunks(req, n)[..n - 1] == Chunks(req, n - 1);
      RepliesPrefix(f, req, n - 1, n);
      AllConflictKeepsLog(f, req, n - 1);
      assert Deliver(f, Chunks(req, n)).1[n - 1] == Conflict;
    }
  }

  // -------------------------------------------------------- partial sends

  /** The follower's log agrees with the sender's up to any entry they share. */
  ghost predicate LogMatching(log: seq<LogEntry>, req: AppendRequest) {
    forall i :: 0 <= i < |req.entries| && Contains(log, Some(req.entries[i].id)) ==> Contains(log, req.prev)
  }

  /** Under log matching the exception of `SplitDelivery` vanishes. */
  lemma {:induction false} SplitUnderLogMatching(
    f: Follower, req: AppendRequest, encodedLen: nat, advisoryMessageSize: nat)
    requires req.Consecutive() && LogMatching(f.log, req)
    ensures var parts, whole := SplitAppendRequest(req, encodedLen, advisoryMessageSize), Receive(f, req);
      var (g, replies) := Deliver(f, parts);
      g == whole.f && forall i :: 0 <= i < |replies| ==> replies[i] == whole.reply
  {
    SplitDelivery(f, req, encodedLen, advisoryMessageSize);
  }

  /** The follower is not ahead of the sender and has what the request is chained to. */
  predicate Accepts(f: Follower, req: AppendRequest) { f.vote <= req.vote && Contains(f.log, req.prev) }

  /** The id reported after a partial send is in the follower's log exactly when the follower could
      accept the request, or had the entry before. Under log matching a follower that had it and
      could not accept votes higher. */
  lemma PartialAcknowledgement(f: Follower, req: AppendRequest, n: nat)
    requires req.Consecutive() && 0 < n <= |req.entries|
    ensures var g, id := Receive(f, req.Partial(n)).f, Some(req.entries[n - 1].id);
      && (Contains(g.log, id) <==> Accepts(f, req) || Contains(f.log, id))
      && (LogMatching(f.log, req) ==>
            (Contains(g.log, id) <==> Accepts(f, req) || (req.vote < f.vote && Contains(f.log, id))))
  {
    if Accepts(f, req) {
      MergeContains(f.log, NextIndex(req.prev), req.entries[..n], n - 1);
    }
  }

  /** A follower with an empty log answers a conflict, yet the first of two entries sent alone is
      reported as appended. */
  lemma ReportedButAbsent()
    ensures var f := Follower(1, [], 0);
      var req := AppendRequest(1, Some(LogId(1, 4)), [LogEntry(LogId(1, 5), []), LogEntry(LogId(1, 6), [])], None);
      var r := Receive(f, req.Partial(1));
      && req.Consecutive() && LogMatching(f.log, req)
      && r.reply == Conflict && !Contains(r.f.log, Some(req.entries[0].id))
  {
  }

  /** Partial sends followed by the rest: `counts` entries in each, then whatever is left. */
  function DeliverParts(f: Follower, req: AppendRequest, counts: seq<nat>): Received
    decreases |counts|
  {
    if counts == [] || counts[0] > |req.entries| then Receive(f, req)
    else DeliverParts(Receive(f, req.Partial(counts[0])).f, req.Remainder(counts[0]), counts[1..])
  }

  /** The log holds an entry that one of the later parts is chained to. */
  predicate HoldsACut(log: seq<LogEntry>, req: AppendRequest, counts: seq<nat>)
    decreases |counts|
  {
    && counts != [] && counts[0] <= |req.entries|
    && (Contains(log, req.IdBefore(counts[0])) || HoldsACut(log, req.Remainder(counts[0]), counts[1..]))
  }

  /** However the entries are cut into partial sends, the follower ends, and answers last, as if
      they had been sent in one request, unless it lacks `prev` but holds an entry that a later part
      is chained to. */
  lemma {:induction false} PartsDeliverAll(f: Follower, req: AppendRequest, counts: seq<nat>)
    requires req.Consecutive()
    ensures DeliverParts(f, req, counts) == Receive(f, req) <==>
            !(Receive(f, req).reply == Conflict && HoldsACut(f.log, req, counts))
    decreases |counts|
  {
    if counts != [] && counts[0] <= |req.entries| {
      var first, rest := Receive(f, req.Partial(counts[0])), req.Remainder(counts[0]);
      TwoParts(f, req, counts[0]);
      RemainderConsecutive(req, counts[0]);
      PartsDeliverAll(first.f, rest, counts[1..]);
    }
  }

  lemma RemainderConsecutive(req: AppendRequest, n: nat)
    requires req.Consecutive() && n <= |req.entries|
    ensures req.Remainder(n).Consecutive()
  {
  }

  /** Under log matching there is no exception. */
  lemma {:induction false} PartsUnderLogMatching(f: Follower, req: AppendRequest, counts: seq<nat>)
    requires req.Consecutive() && LogMatching(f.log, req)
    ensures DeliverParts(f, req, counts) == Receive(f, req)
  {
    PartsDeliverAll(f, req, counts);
    if !Contains(f.log, req.prev) { NoCutHeld(f.log, req, counts); }
  }

  lemma {:induction false} NoCutHeld(log: seq<LogEntry>, req: AppendRequest, counts: seq<nat>)
    requires !Contains(log, req.prev)
    requires forall i :: 0 <= i < |req.entries| ==> !Contains(log, Some(req.entries[i].id))
    ensures !HoldsACut(log, req, counts)
    decreases |counts|
  {
    if counts != [] && counts[0] <= |req.entries| {
      NoCutHeld(log, req.Remainder(counts[0]), counts[1..]);
    }
  }

  // -------------------------------------------------------- the retry loop

  /** What the transport says to a request: answered, too large for the receiver, or failed. */
  datatype Transport = Answered(reply: AppendReply) | ResourceExhausted | Unavailable

  /** The encoded size by entry count, if encoding succeeds, the size limit, and the answer to the
      `k`-th request sent, by entry count. All are arbitrary. */
  datatype Network = Network(size: nat -> Option<nat>, limit: nat, answer: (nat, nat) -> Transport) {
    predicate Fits(n: nat) { size(n).Some? && size(n).value <= limit }

    /** A request of `n` entries is too large, by its size or, as `k`-th sent, by the receiver's word. */
    predicate Refuses(k: nat, n: nat) {
      (size(n).Some? && size(n).value > limit) || (Fits(n) && answer(k, n) == ResourceExhausted)
    }

    /** Of the counts tried, those that are sent. */
    function Sent(tried: seq<nat>): seq<nat> {
      if tried == [] then []
      else
        var last := |tried| - 1;
        Sent(tried[..last]) + if Fits(tried[last]) then [tried[last]] else []
    }

    predicate RefusesAt(tried: seq<nat>, i: nat)
      requires i < |tried|
    {
      Refuses(|Sent(tried[..i])|, tried[i])
    }
  }

  datatype AppendResult =
    | Replied(reply: AppendReply)
    | PartialSuccess(last: Option<LogId>)
    | TooLarge
    | Failed

  /** Each count is half the one before, from `total` on, and none but the last is below two. */
  predicate Halves(tried: seq<nat>, total: nat) {
    && tried != [] && tried[0] == total
    && forall i :: 0 <= i < |tried| - 1 ==> tried[i] > 1 && tried[i + 1] == tried[i] / 2
  }

  predicate RefusedUpTo(net: Network, tried: seq<nat>, n: nat)
    requires n <= |tried|
  {
    forall i :: 0 <= i < n ==> net.RefusesAt(tried, i)
  }

  /** What the result says about `n` entries, sent, if at all, as request number `k`. */
  predicate EndsAt(net: Network, req: AppendRequest, n: nat, k: nat, result: AppendResult) {
    match result
    case Replied(reply) => n == |req.entries| && net.Fits(n) && net.answer(k, n) == Answered(reply)
    case PartialSuccess(id) =>
      0 < n < |req.entries| && net.Fits(n) && net.answer(k, n).Answered? && id == Some(req.entries[n - 1].id)
    case TooLarge => n <= 1 && net.Refuses(k, n)
    case Failed => net.size(n).None? || (net.Fits(n) && net.answer(k, n) == Unavailable)
  }

  /** What the result says about the last count tried. */
  predicate EndsWith(net: Network, req: AppendRequest, tried: seq<nat>, result: AppendResult)
    requires tried != []
  {
    var last := |tried| - 1;
    EndsAt(net, req, tried[last], |net.Sent(tried[..last])|, result)
  }

  /** Encode and send `n` entries; no result means to try again with half as many. */
  method Attempt(req: AppendRequest, net: Network, n: nat, k: nat) returns (result: Option<AppendResult>, sent: nat)
    requires n == |req.entries| || 0 < n < |req.entries|
    ensures result.Some? ==> EndsAt(net, req, n, k, result.value)
    ensures result.None? ==> n > 1 && net.Refuses(k, n)
    ensures sent == k + if net.Fits(n) then 1 else 0
  {
    sent := k;
    var size := net.size(n);
    if size.None? {
      return Some(Failed), sent;
    }
    if size.value <= net.limit {
      sent := sent + 1;
      match net.answer(k, n)
      case Answered(reply) =>
        if n < |req.entries| {
          return Some(PartialSuccess(Some(req.entries[n - 1].id))), sent;
        }
        return Some(Replied(reply)), sent;
      case Unavailable =>
        return Some(Failed), sent;
      case ResourceExhausted =>
    }
    result := if n <= 1 then Some(TooLarge) else None;
  }

  /** Send the request; while it is too large by the encoded size or by the receiver's word, send
      half as many entries. `tried` lists the entry counts in order: exactly those that fit are sent,
      all but the last are refused, and the result is what happened to the last. */
  method AppendEntries(req: AppendRequest, net: Network) returns (result: AppendResult, tried: seq<nat>)
    ensures Halves(tried, |req.entries|) && (|tried| == 1 || Pow2(|tried| - 1) <= |req.entries|)
    ensures RefusedUpTo(net, tried, |tried| - 1) && EndsWith(net, req, tried, result)
  {
    var total := |req.entries|;
    var n: nat, sent: nat := total, 0;
    tried := [];
    while true
      invariant Halves(tried + [n], total) && RefusedUpTo(net, tried, |tried|) && sent == |net.Sent(tried)|
      decreases n
    {
      AttemptMade(net, tried, n, total);
      var r;
      r, sent := Attempt(req, net, n, sent);
      tried := tried + [n];
      if r.Some? {
        return r.value, tried;
      }
      n := n / 2;
    }
  }

  lemma {:induction false} AttemptMade(net: Network, tried: seq<nat>, n: nat, total: nat)
    requires Halves(tried + [n], total) && RefusedUpTo(net, tried, |tried|)
    ensures var now := tried + [n];
      && now[|tried|] == n && now[..|tried|] == tried && RefusedUpTo(net, now, |tried|)
      && n <= total && (tried != [] ==> 0 < n < total)
      && (|now| == 1 || Pow2(|now| - 1) <= total)
      && |net.Sent(now)| == |net.Sent(tried)| + (if net.Fits(n) then 1 else 0)
      && (net.Refuses(|net.Sent(tried)|, n) ==> RefusedUpTo(net, now, |now|))
      && (n > 1 ==> Halves(now + [n / 2], total))
  {
    TriedSnoc(net, tried, n);
    HalvesBelow(tried + [n], total);
    AttemptsBound(tried + [n], total);
  }

  lemma {:induction false} TriedSnoc(net: Network, tried: seq<nat>, n: nat)
    requires RefusedUpTo(net, tried, |tried|)
    ensures RefusedUpTo(net, tried + [n], |tried|)
    ensures (tried + [n])[..|tried|] == tried
    ensures |net.Sent(tried + [n])| == |net.Sent(tried)| + if net.Fits(n) then 1 else 0
  {
    forall i | 0 <= i < |tried| ensures net.RefusesAt(tried + [n], i) {
      assert (tried + [n])[..i] == tried[..i];
      assert net.RefusesAt(tried, i);
    }
  }

  lemma {:induction false} HalvesBelow(tried: seq<nat>, total: nat)
    requires Halves(tried, total)
    ensures tried[|tried| - 1] <= total && (|tried| > 1 ==> 0 < tried[|tried| - 1] < total)
    decreases |tried|
  {
    if |tried| > 1 {
      HalvesBelow(tried[..|tried| - 1], total);
      var i := |tried| - 2;
      assert tried[i + 1] == tried[i] / 2;
    }
  }

  function Pow2(n: nat): nat { if n == 0 then 1 else 2 * Pow2(n - 1) }

  /** Halving takes logarithmically many attempts. */
  lemma {:induction false} AttemptsBound(tried: seq<nat>, total: nat)
    requires Halves(tried, total)
    ensures tried[|tried| - 1] * Pow2(|tried| - 1) <= total
    ensures |tried| > 1 ==> Pow2(|tried| - 1) <= total
    decreases |tried|
  {
    if |tried| > 1 {
      var i := |tried| - 2;
      AttemptsBound(tried[..i + 1], total);
      assert tried[i + 1] == tried[i] / 2;
      HalvingBound(tried[i], i, total);
      ProductGrows(1, tried[i + 1], Pow2(i + 1));
    }
  }

  lemma HalvingBound(n: nat, tries: nat, total: nat)
    requires n * Pow2(tries) <= total
    ensures (n / 2) * Pow2(tries + 1) <= total
  {
    HalfOfProduct(n / 2, Pow2(tries));
    ProductGrows(2 * (n / 2), n, Pow2(tries));
  }

  lemma HalfOfProduct(d: nat, p: nat)
    ensures d * (2 * p) == (2 * d) * p
  {
  }

  lemma {:induction false} ProductGrows(a: nat, b: nat, p: nat)
    requires a <= b
    ensures a * p <= b * p
    decreases p
  {
    if p > 0 {
      ProductGrows(a, b, p - 1);
      assert a * p == a * (p - 1) + a && b * p == b * (p - 1) + b;
    }
  }

  // ----------------------------------------------- the loop and a follower

  /** What the channel does to a request: it arrives, is refused for its size, or is lost. */
  datatype Channel = Delivered | Refused | Lost

  function NetworkTo(f: Follower, req: AppendRequest, size: AppendRequest -> Option<nat>, limit: nat,
                     channel: nat -> Channel): Network
  {
    Network((n: nat) => if n <= |req.entries| then size(req.Partial(n)) else None,
            limit,
            (k: nat, n: nat) => AnswerThrough(channel(k), f, req, n))
  }

  function AnswerThrough(c: Channel, f: Follower, req: AppendRequest, n: nat): Transport {
    match c
    case Delivered => if n <= |req.entries| then Answered(Receive(f, req.Partial(n)).reply) else Unavailable
    case Refused => ResourceExhausted
    case Lost => Unavailable
  }

  /** A call against a follower tried `tried` and ended so; this determines both. */
  ghost predicate Called(f: Follower, req: AppendRequest, size: AppendRequest -> Option<nat>, limit: nat,
                         channel: nat -> Channel, tried: seq<nat>, result: AppendResult)
  {
    var net := NetworkTo(f, req, size, limit, channel);
    && Halves(tried, |req.entries|)
    && RefusedUpTo(net, tried, |tried| - 1) && EndsWith(net, req, tried, result)
  }

  /** What a call means for the follower, `n` being the count it ended with: a full reply is the
      follower's answer to the whole request; too large is a request of at most one entry over the
      limit or refused on the way; a failure is a request that does not encode or is lost. */
  lemma CalledMeaning(f: Follower, req: AppendRequest, size: AppendRequest -> Option<nat>, limit: nat,
                      channel: nat -> Channel, tried: seq<nat>, result: AppendResult)
    requires Called(f, req, size, limit, channel, tried, result)
    ensures var n := tried[|tried| - 1];
      && n <= |req.entries|
      && match result
         case Replied(reply) => n == |req.entries| && reply == Receive(f, req).reply
         case PartialSuccess(id) => 0 < n < |req.entries| && id == Some(req.entries[n - 1].id)
         case TooLarge =>
           n <= 1 && (OverLimit(size(req.Partial(n)), limit) || exists k: nat :: channel(k) == Refused)
         case Failed => size(req.Partial(n)).None? || exists k: nat :: channel(k) == Lost
  {
    var net, n := NetworkTo(f, req, size, limit, channel), tried[|tried| - 1];
    var k := |net.Sent(tried[..|tried| - 1])|;
    HalvesBelow(tried, |req.entries|);
    assert net.answer(k, n) == AnswerThrough(channel(k), f, req, n);
    assert req.Partial(|req.entries|) == req;
  }

  predicate OverLimit(size: Option<nat>, limit: nat) { size.Some? && size.value > limit }

  /** What becomes of the follower in a call that ends with `n` entries. */
  function AfterCall(f: Follower, req: AppendRequest, result: AppendResult, n: nat): Follower
    requires n <= |req.entries|
  {
    if result.Replied? || result.PartialSuccess? then Receive(f, req.Partial(n)).f else f
  }

  /** One call against a follower. The id reported by a partial success is in the follower's log
      exactly under the condition of `PartialAcknowledgement`. */
  method SendOnce(f: Follower, req: AppendRequest, size: AppendRequest -> Option<nat>, limit: nat,
                  channel: nat -> Channel)
    returns (result: AppendResult, g: Follower, tried: seq<nat>)
    requires req.Consecutive()
    ensures Called(f, req, size, limit, channel, tried, result) && tried[|tried| - 1] <= |req.entries|
    ensures g == AfterCall(f, req, result, tried[|tried| - 1])
    ensures result.Replied? ==> Received(g, result.reply) == Receive(f, req)
    ensures result.PartialSuccess? ==>
      (Contains(g.log, result.last) <==> Accepts(f, req) || Contains(f.log, result.last))
  {
    result, tried := AppendEntries(req, NetworkTo(f, req, size, limit, channel));
    CalledMeaning(f, req, size, limit, channel, tried, result);
    var n := tried[|tried| - 1];
    assert req.Partial(|req.entries|) == req;
    g := AfterCall(f, req, result, n);
    if result.PartialSuccess? { PartialAcknowledgement(f, req, n); }
  }

  /** What the channel does to the requests of one call. */
  function CallChannel(channel: (nat, nat) -> Channel, call: nat): nat -> Channel { (k: nat) => channel(call, k) }

  /** Every request encodes, requests of at most one entry are within the limit, and all arrive. */
  ghost predicate Reliable(size: AppendRequest -> Option<nat>, limit: nat, channel: (nat, nat) -> Channel) {
    && (forall r: AppendRequest :: size(r).Some? && (|r.entries| <= 1 ==> size(r).value <= limit))
    && (forall c: nat, k: nat :: channel(c, k) == Delivered)
  }

  /** Calls with partial success, what each of them tried, and the follower and the request before
      each of them and after the last. */
  datatype Run = Run(followers: seq<Follower>, requests: seq<AppendRequest>, calls: seq<seq<nat>>) {
    predicate Shaped() { |followers| == |requests| == |calls| + 1 }

    /** The follower and the request that call number `i` found. */
    function FollowerAt(i: nat): Follower
      requires Shaped() && i <= |calls|
    {
      followers[i]
    }

    function RequestAt(i: nat): AppendRequest
      requires Shaped() && i <= |calls|
    {
      requests[i]
    }
  }

  /** A call with partial success, and the follower and the request it leaves. */
  ghost predicate SentPartly(size: AppendRequest -> Option<nat>, limit: nat, channel: nat -> Channel,
                             f: Follower, req: AppendRequest, tried: seq<nat>, g: Follower, rest: AppendRequest)
  {
    && tried != [] && 0 < tried[|tried| - 1] < |req.entries|
    && var n := tried[|tried| - 1];
    && Called(f, req, size, limit, channel, tried, PartialSuccess(Some(req.entries[n - 1].id)))
    && g == Receive(f, req.Partial(n)).f && rest == req.Remainder(n)
  }

  ghost predicate RunOf(size: AppendRequest -> Option<nat>, limit: nat, channel: (nat, nat) -> Channel, run: Run) {
    && run.Shaped()
    && forall i :: 0 <= i < |run.calls| ==>
         SentPartly(size, limit, CallChannel(channel, i), run.FollowerAt(i), run.RequestAt(i), run.calls[i],
                    run.FollowerAt(i + 1), run.RequestAt(i + 1))
  }

  /** Calls repeated after each partial success with what remains; `last` is what the last call tried.
      If it is answered, the follower ends, and answers, as if it had been sent everything in one
      request, for all sizes and losses; log matching is needed only if it lacks `prev`. Over a
      reliable network it is answered. */
  method Replicate(f: Follower, req: AppendRequest, size: AppendRequest -> Option<nat>, limit: nat,
                   channel: (nat, nat) -> Channel)
    returns (result: AppendResult, g: Follower, run: Run, last: seq<nat>)
    requires req.Consecutive()
    ensures RunOf(size, limit, channel, run) && run.FollowerAt(0) == f && run.RequestAt(0) == req
    ensures var k := |run.calls|;
      Called(run.FollowerAt(k), run.RequestAt(k), size, limit, CallChannel(channel, k), last, result)
    ensures !result.PartialSuccess? && |run.calls| <= |req.entries|
    ensures Reliable(size, limit, channel) ==> result.Replied?
    ensures result.Replied? && (Contains(f.log, req.prev) || req.vote < f.vote || LogMatching(f.log, req)) ==>
      Received(g, result.reply) == Receive(f, req)
  {
    g := f;
    var rest := req;
    run := Run([f], [req], []);
    while true
      invariant RunOf(size, limit, channel, run) && run.FollowerAt(0) == f && run.RequestAt(0) == req
      invariant g == run.FollowerAt(|run.calls|) && rest == run.RequestAt(|run.calls|)
      invariant rest.Consecutive() && |run.calls| + |rest.entries| <= |req.entries|
      decreases |rest.entries|
    {
      var before, toSend, oneCall := g, rest, CallChannel(channel, |run.calls|);
      result, g, last := SendOnce(before, toSend, size, limit, oneCall);
      CalledMeaning(before, toSend, size, limit, oneCall, last, result);
      if !result.PartialSuccess? {
        DeliveredInFull(size, limit, channel, run);
        return;
      }
      var n := last[|last| - 1];
      rest := toSend.Remainder(n);
      RemainderConsecutive(toSend, n);
      RunExtended(size, limit, channel, run, last, g, rest);
      run := Run(run.followers + [g], run.requests + [rest], run.calls + [last]);
    }
  }

  lemma RunExtended(size: AppendRequest -> Option<nat>, limit: nat, channel: (nat, nat) -> Channel, run: Run,
                    tried: seq<nat>, g: Follower, rest: AppendRequest)
    requires RunOf(size, limit, channel, run)
    requires var k := |run.calls|;
      SentPartly(size, limit, CallChannel(channel, k), run.FollowerAt(k), run.RequestAt(k), tried, g, rest)
    ensures RunOf(size, limit, channel, Run(run.followers + [g], run.requests + [rest], run.calls + [tried]))
  {
    var longer := Run(run.followers + [g], run.requests + [rest], run.calls + [tried]);
    forall i | 0 <= i < |longer.calls|
      ensures SentPartly(size, limit, CallChannel(channel, i), longer.FollowerAt(i), longer.RequestAt(i),
                         longer.calls[i], longer.FollowerAt(i + 1), longer.RequestAt(i + 1))
    {
      if i < |run.calls| {
        assert run.FollowerAt(i) == longer.FollowerAt(i) && run.FollowerAt(i + 1) == longer.FollowerAt(i + 1);
        assert run.RequestAt(i) == longer.RequestAt(i) && run.RequestAt(i + 1) == longer.RequestAt(i + 1);
      }
    }
  }

  /** The calls are partial sends, so what `PartsDeliverAll` says holds of them. */
  lemma DeliveredInFull(size: AppendRequest -> Option<nat>, limit: nat, channel: (nat, nat) -> Channel, run: Run)
    requires RunOf(size, limit, channel, run) && run.RequestAt(0).Consecutive()
    ensures var f, req, k := run.FollowerAt(0), run.RequestAt(0), |run.calls|;
      Contains(f.log, req.prev) || req.vote < f.vote || LogMatching(f.log, req) ==>
      Receive(run.FollowerAt(k), run.RequestAt(k)) == Receive(f, req)
  {
    var f, req := run.FollowerAt(0), run.RequestAt(0);
    var counts := CallsAreParts(size, limit, channel, run, 0);
    PartsDeliverAll(f, req, counts);
    if LogMatching(f.log, req) { PartsUnderLogMatching(f, req, counts); }
  }

  lemma {:induction false} CallsAreParts(
    size: AppendRequest -> Option<nat>, limit: nat, channel: (nat, nat) -> Channel, run: Run, i: nat)
    returns (counts: seq<nat>)
    requires RunOf(size, limit, channel, run) && i <= |run.calls|
    ensures DeliverParts(run.FollowerAt(i), run.RequestAt(i), counts)
            == Receive(run.FollowerAt(|run.calls|), run.RequestAt(|run.calls|))
    decreases |run.calls| - i
  {
    counts := [];
    if i < |run.calls| {
      assert SentPartly(size, limit, CallChannel(channel, i), run.FollowerAt(i), run.RequestAt(i), run.calls[i],
                        run.FollowerAt(i + 1), run.RequestAt(i + 1));
      var later := CallsAreParts(size, limit, channel, run, i + 1);
      counts := [run.calls[i][|run.calls[i]| - 1]] + later;
      assert counts[1..] == later;
    }
  }
}
