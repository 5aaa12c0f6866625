/** How long a record stays visible. */
module Lifetimes {
  import opened IndexInvariant
  import opened KvTypes
  import opened Listing
  import opened LogRefinement
  import opened Machine
  import opened Operations
  import opened Overlooked
  import opened Refinement
  import opened Timestamps
  import opened Wrappers

  /** The record does not expire, or not before `t`. */
  predicate Outlives(v: SeqV, t: u64) { v.meta.Some? ==> !Past(v.meta.value.expireAt, t) }

  /** What an entry timed `t` leaves of a record it does not write. */
  function LeftAt(v: Option<SeqV>, t: u64): Option<SeqV> {
    if v.Some? && Outlives(v.value, t) then v else None
  }

  lemma CleanLeaves(s: IndexedStore, now: u64, k: string)
    requires WellIndexed(s) && CleanedUp(s)
    ensures Lookup(CleanExpired(Indexed(s), now).st, k) == LeftAt(Lookup(Indexed(s), k), now)
  {
    LookupIsRecord(Indexed(s), k);
    if now > 0 {
      CleanEffect(s, now);
      LookupIsRecord(CleanExpired(Indexed(s), now).st, k);
      ExpiredIsPast(Visible(s), now, k);
    } else if k in Visible(s) {
      NothingIsPast(Visible(s)[k]);
    }
  }

  lemma ExpiredIsPast(records: map<string, SeqV>, now: u64, k: string)
    ensures k in ExpiredKeys(records, now) <==> k in records && !Outlives(records[k], now)
  {
  }

  lemma NothingIsPast(v: SeqV)
    ensures Outlives(v, 0)
  {
  }

  lemma EntryLeaves(s: IndexedStore, e: Entry, k: string)
    requires WellIndexed(s) && CleanedUp(s) && (e.Command? ==> Spares(e.cmd, k))
    ensures Lookup(ApplyEntry(Indexed(s), e).st, k) == LeftAt(Lookup(Indexed(s), k), e.LogTime())
  {
    CleanLeaves(s, e.LogTime(), k);
    CleanKeepsIndex(s, e.LogTime());
    if e.Command? { CmdSpares(CleanExpired(Indexed(s), e.LogTime()).st, e.cmd, e.LogTime(), k); }
  }

  ghost predicate SparedBy(log: seq<Entry>, k: string) {
    forall i :: 0 <= i < |log| && log[i].Command? ==> Spares(log[i].cmd, k)
  }

  predicate AllWithin(log: seq<Entry>, v: SeqV) { forall i :: 0 <= i < |log| ==> Outlives(v, log[i].LogTime()) }

  /** A record that no command of a safe log writes is visible after it, unchanged, if and only if no
      entry is timed after its expiry; times may go backwards. */
  lemma {:induction false} RecordLives(s: IndexedStore, log: seq<Entry>, k: string)
    requires WellIndexed(s) && CleanedUp(s) && SafeLog(log, s.cleanupStart) && SparedBy(log, k)
    ensures var v := Lookup(Indexed(s), k);
      Lookup(ApplyLog(Indexed(s), log).st, k) == if v.Some? && AllWithin(log, v.value) then v else None
    decreases |log|
  {
    if log != [] {
      var t := ApplyEntry(Indexed(s), log[0]).st;
      EntryRefines(s, log[0]);
      EntryLeaves(s, log[0], k);
      assert SparedBy(log[1..], k) by {
        assert forall i :: 0 <= i < |log[1..]| ==> log[1..][i] == log[i + 1];
      }
      RecordLives(t.s, log[1..], k);
      var v := Lookup(Indexed(s), k);
      if v.Some? { FirstWithin(log, v.value); }
    }
  }

  lemma FirstWithin(log: seq<Entry>, v: SeqV)
    requires log != []
    ensures AllWithin(log, v) <==> Outlives(v, log[0].LogTime()) && AllWithin(log[1..], v)
  {
    assert forall i :: 0 <= i < |log[1..]| ==> log[1..][i] == log[i + 1];
    if Outlives(v, log[0].LogTime()) && AllWithin(log[1..], v) {
      forall i | 0 <= i < |log| ensures Outlives(v, log[i].LogTime()) {
        assert i > 0 ==> log[i] == log[1..][i - 1];
      }
    }
  }

  /** The last time, in milliseconds, at which a record written at `now` with a time-to-live is
      visible. It is `now + ttl`, capped at 64 bits, for every clock after March 1973; below
      `100_000_000_000` the sum is read as seconds. */
  function TtlDeadline(now: u64, ttl: u64): nat {
    var sum := if now + ttl > U64_MAX then U64_MAX else now + ttl;
    if sum > 100_000_000_000 then sum else sum * 1000
  }

  /** A timed update with a time-to-live whose condition matches is visible after every later log of
      timed commands that does not write its key exactly if no entry is timed after the deadline. */
  lemma {:induction false} TtlRecordLives(s: IndexedStore, u: UpsertKV, now: u64, ttl: u64, log: seq<Entry>)
    requires WellIndexed(s) && CleanedUp(s) && now > 0
    requires u.value.Update? && u.valueMeta.Some? && u.valueMeta.value.ttlMs == Some(ttl)
    requires Matched(u.cond, LeftAt(Lookup(Indexed(s), u.key), now))
    requires AllTimed(log) && SparedBy(log, u.key)
    ensures var written := ApplyEntry(Indexed(s), Command(Some(now), UpsertCmd(u))).st;
      Lookup(ApplyLog(written, log).st, u.key).Some? <==>
      forall i :: 0 <= i < |log| ==> log[i].LogTime() <= TtlDeadline(now, ttl)
  {
    var written := ApplyEntry(Indexed(s), Command(Some(now), UpsertCmd(u))).st;
    TtlWritten(s, u, now, ttl);
    TimedIsSafe(log, written.s.cleanupStart);
    RecordLives(written.s, log, u.key);
    var v := Lookup(written, u.key).value;
    forall t: u64 ensures Outlives(v, t) <==> t <= TtlDeadline(now, ttl) { TtlOutlives(v, now, ttl, t); }
  }

  function TtlMeta(now: u64, ttl: u64): KvMeta {
    KvMeta(Some(if now + ttl > U64_MAX then U64_MAX else now + ttl), Some(now))
  }

  lemma TtlOutlives(v: SeqV, now: u64, ttl: u64, t: u64)
    requires v.meta == Some(TtlMeta(now, ttl))
    ensures Outlives(v, t) <==> t <= TtlDeadline(now, ttl)
  {
  }

  lemma TtlWritten(s: IndexedStore, u: UpsertKV, now: u64, ttl: u64)
    requires WellIndexed(s) && CleanedUp(s) && now > 0
    requires u.value.Update? && u.valueMeta.Some? && u.valueMeta.value.ttlMs == Some(ttl)
    requires Matched(u.cond, LeftAt(Lookup(Indexed(s), u.key), now))
    ensures var written := ApplyEntry(Indexed(s), Command(Some(now), UpsertCmd(u))).st;
      && written.Indexed? && WellIndexed(written.s) && CleanedUp(written.s)
      && Lookup(written, u.key).Some? && Lookup(written, u.key).value.meta == Some(TtlMeta(now, ttl))
  {
    var e, clean := Command(Some(now), UpsertCmd(u)), CleanExpired(Indexed(s), now).st;
    TimedIsSafe([e], s.cleanupStart);
    EntryRefines(s, e);
    CleanKeepsIndex(s, now);
    CleanLeaves(s, now, u.key);
    WrittenWithTtl(clean, u, now, ttl);
    assert ApplyEntry(Indexed(s), e).st == ApplyCmd(clean, UpsertCmd(u), now).st;
  }

  lemma WrittenWithTtl(st: Store, u: UpsertKV, now: u64, ttl: u64)
    requires Sound(st) && Matched(u.cond, Lookup(st, u.key))
    requires u.value.Update? && u.valueMeta.Some? && u.valueMeta.value.ttlMs == Some(ttl)
    ensures Lookup(ApplyCmd(st, UpsertCmd(u), now).st, u.key)
            == Some(SeqV(SequenceOf(st) + 1, Some(TtlMeta(now, ttl)), u.value.data))
  {
    UpsertMeaning(st, u, now);
  }
}
